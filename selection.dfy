/**
 * The cross-page selection: an ordered list of artworks in which membership is
 * decided by identifier alone, and the list operations the table applies to it.
 */
module Selection {
  import opened Records
  import opened Sequences

  /** `s.some(x => x.id === id)`. */
  function Contains(s: seq<Artwork>, id: int): (b: bool)
    ensures b <==> exists i :: 0 <= i < |s| && s[i].id == id
    decreases |s|
  {
    if s == [] then false
    else if s[0].id == id then true
    else
      var b := Contains(s[1..], id);
      assert b ==> exists i :: 1 <= i < |s| && s[i].id == id by {
        if b {
          var j :| 0 <= j < |s[1..]| && s[1..][j].id == id;
          assert s[j + 1].id == id;
        }
      }
      assert (exists i :: 1 <= i < |s| && s[i].id == id) ==> b by {
        if exists i :: 1 <= i < |s| && s[i].id == id {
          var j :| 1 <= j < |s| && s[j].id == id;
          assert s[1..][j - 1].id == id;
        }
      }
      b
  }

  /** `items.every(item => sel.some(x => x.id === item.id))`. */
  function Every(items: seq<Artwork>, sel: seq<Artwork>): (b: bool)
    ensures b <==> forall i :: 0 <= i < |items| ==> Contains(sel, items[i].id)
    decreases |items|
  {
    if items == [] then true
    else
      var b := Every(items[1..], sel);
      assert b <==> forall i :: 1 <= i < |items| ==> Contains(sel, items[i].id) by {
        if b {
          forall i | 1 <= i < |items| ensures Contains(sel, items[i].id) {
            assert items[i] == items[1..][i - 1];
          }
        }
      }
      Contains(sel, items[0].id) && b
  }

  /** The header checkbox: the page is non-empty and each of its ids is selected. */
  function IsAllSelected(data: seq<Artwork>, sel: seq<Artwork>): (b: bool)
    ensures b <==> (|data| > 0 &&
                    forall i :: 0 <= i < |data| ==> exists j :: 0 <= j < |sel| && sel[j].id == data[i].id)
  {
    |data| > 0 && Every(data, sel)
  }

  /** No identifier occurs twice. */
  ghost predicate DistinctIds(s: seq<Artwork>) {
    forall i, j :: 0 <= i < j < |s| ==> s[i].id != s[j].id
  }

  lemma {:induction false} SubsequenceDistinct(r: seq<Artwork>, s: seq<Artwork>)
    requires IsSubsequence(r, s) && DistinctIds(s)
    ensures DistinctIds(r)
    decreases |s|
  {
    if r != [] {
      if r[0] == s[0] && IsSubsequence(r[1..], s[1..]) {
        SubsequenceDistinct(r[1..], s[1..]);
        SubsequenceMembers(r[1..], s[1..]);
        forall i, j | 0 <= i < j < |r| ensures r[i].id != r[j].id {
          if i == 0 {
            assert r[j] == r[1..][j - 1];
            assert r[j] in s[1..];
          } else {
            assert r[i] == r[1..][i - 1] && r[j] == r[1..][j - 1];
          }
        }
      } else {
        SubsequenceDistinct(r, s[1..]);
      }
    }
  }

  /**
   * Deselecting the current page: `sel.filter(x => !data.some(item => item.id === x.id))`.
   * It removes exactly the entries whose id is on the page; the others, from
   * other pages, survive with their values, as often as before and in order.
   */
  function RemovePage(sel: seq<Artwork>, data: seq<Artwork>): (r: seq<Artwork>)
    ensures IsSubsequence(r, sel)
    ensures forall x :: multiset(r)[x] == if Contains(data, x.id) then 0 else multiset(sel)[x]
    ensures forall id :: Contains(r, id) <==> Contains(sel, id) && !Contains(data, id)
    ensures DistinctIds(sel) ==> DistinctIds(r)
  {
    var r := Filter(sel, (x: Artwork) => !Contains(data, x.id));
    assert IsSubsequence(r, sel) by { FilterSubsequence(sel, (x: Artwork) => !Contains(data, x.id)); }
    assert forall x :: multiset(r)[x] == if Contains(data, x.id) then 0 else multiset(sel)[x] by {
      FilterCounts(sel, (x: Artwork) => !Contains(data, x.id));
    }
    assert forall id :: Contains(r, id) <==> Contains(sel, id) && !Contains(data, id) by {
      FilterMembers(sel, (x: Artwork) => !Contains(data, x.id));
      forall id ensures Contains(r, id) <==> Contains(sel, id) && !Contains(data, id) {
        if Contains(sel, id) && !Contains(data, id) {
          var i :| 0 <= i < |sel| && sel[i].id == id;
          assert sel[i] in r;
        }
        if Contains(r, id) {
          var i :| 0 <= i < |r| && r[i].id == id;
          assert r[i] in r;
        }
      }
    }
    assert DistinctIds(sel) ==> DistinctIds(r) by {
      if DistinctIds(sel) {
        SubsequenceDistinct(r, sel);
      }
    }
    r
  }

  /**
   * Unchecking one row: `sel.filter(x => x.id !== id)`. Every entry with that
   * id goes; every other entry stays, in order.
   */
  function RemoveId(sel: seq<Artwork>, id: int): (r: seq<Artwork>)
    ensures IsSubsequence(r, sel)
    ensures forall x :: multiset(r)[x] == if x.id == id then 0 else multiset(sel)[x]
    ensures !Contains(r, id)
    ensures forall other :: other != id ==> (Contains(r, other) <==> Contains(sel, other))
    ensures DistinctIds(sel) ==> DistinctIds(r)
  {
    var r := Filter(sel, (x: Artwork) => x.id != id);
    assert IsSubsequence(r, sel) by { FilterSubsequence(sel, (x: Artwork) => x.id != id); }
    assert forall x :: multiset(r)[x] == if x.id == id then 0 else multiset(sel)[x] by {
      FilterCounts(sel, (x: Artwork) => x.id != id);
    }
    assert forall other :: Contains(r, other) <==> other != id && Contains(sel, other) by {
      FilterMembers(sel, (x: Artwork) => x.id != id);
      forall other ensures Contains(r, other) <==> other != id && Contains(sel, other) {
        if other != id && Contains(sel, other) {
          var i :| 0 <= i < |sel| && sel[i].id == other;
          assert sel[i] in r;
        }
        if Contains(r, other) {
          var i :| 0 <= i < |r| && r[i].id == other;
          assert r[i] in r;
        }
      }
    }
    assert DistinctIds(sel) ==> DistinctIds(r) by {
      if DistinctIds(sel) {
        SubsequenceDistinct(r, sel);
      }
    }
    r
  }

  /** Checking a row and then unchecking it leaves the other rows' entries as they were. */
  lemma ToggleOnThenOff(sel: seq<Artwork>, row: Artwork)
    ensures RemoveId(sel + [row], row.id) == RemoveId(sel, row.id)
    ensures !Contains(sel, row.id) ==> RemoveId(sel + [row], row.id) == sel
  {
    FilterAppend(sel, [row], (x: Artwork) => x.id != row.id);
    assert Filter([row], (x: Artwork) => x.id != row.id) == [];
    if !Contains(sel, row.id) {
      forall i | 0 <= i < |sel| ensures sel[i].id != row.id {
      }
      FilterKeepsAll(sel, (x: Artwork) => x.id != row.id);
    }
  }

  /**
   * Unchecking a selected row and then checking it again gives back the
   * original membership: the row's id is selected again and every other id
   * is selected exactly as before.
   */
  lemma OffThenOn(sel: seq<Artwork>, row: Artwork, id: int)
    requires Contains(sel, row.id)
    ensures Contains(RemoveId(sel, row.id) + [row], id) <==> Contains(sel, id)
  {
    var r := RemoveId(sel, row.id);
    assert (r + [row])[|r|] == row;
    if Contains(r + [row], id) && id != row.id {
      var k :| 0 <= k < |r + [row]| && (r + [row])[k].id == id;
      assert k < |r| && r[k].id == id;
    }
    if Contains(sel, id) && id != row.id {
      var k :| 0 <= k < |r| && r[k].id == id;
      assert (r + [row])[k] == r[k];
    }
  }

  /** Checking a row that is not yet selected keeps the ids distinct. */
  lemma ToggleOnFresh(sel: seq<Artwork>, row: Artwork)
    requires DistinctIds(sel) && !Contains(sel, row.id)
    ensures DistinctIds(sel + [row]) && Contains(sel + [row], row.id)
  {
    assert (sel + [row])[|sel|] == row;
  }

  /**
   * The specification of the `forEach`/`push` merge: each item in turn is
   * appended to the growing list when its id is not in the list yet.
   */
  function Merged(sel: seq<Artwork>, items: seq<Artwork>): (r: seq<Artwork>)
    decreases |items|
  {
    if items == [] then sel
    else Merged(if Contains(sel, items[0].id) then sel else sel + [items[0]], items[1..])
  }

  /** The merge loop of the select-all handler and of the bulk select. */
  method MergeMissing(sel: seq<Artwork>, items: seq<Artwork>) returns (r: seq<Artwork>)
    ensures r == Merged(sel, items)
  {
    r := sel;
    var i := 0;
    while i < |items|
      invariant 0 <= i <= |items|
      invariant Merged(r, items[i..]) == Merged(sel, items)
    {
      assert items[i..][1..] == items[i + 1..];
      if !Contains(r, items[i].id) {
        r := r + [items[i]];
      }
      i := i + 1;
    }
  }

  /** The old selection is a prefix of the merged one. */
  lemma {:induction false} MergedExtends(sel: seq<Artwork>, items: seq<Artwork>)
    ensures |sel| <= |Merged(sel, items)| && Merged(sel, items)[..|sel|] == sel
    decreases |items|
  {
    if items != [] {
      var next := if Contains(sel, items[0].id) then sel else sel + [items[0]];
      MergedExtends(next, items[1..]);
      assert next[..|sel|] == sel;
    }
  }

  /**
   * What the merge appends: entries whose ids were not selected before, drawn
   * from the items in their order.
   */
  lemma {:induction false} MergedAppendsFresh(sel: seq<Artwork>, items: seq<Artwork>)
    ensures forall j :: |sel| <= j < |Merged(sel, items)| ==> !Contains(sel, Merged(sel, items)[j].id)
    ensures |sel| <= |Merged(sel, items)| && IsSubsequence(Merged(sel, items)[|sel|..], items)
    decreases |items|
  {
    var r := Merged(sel, items);
    MergedExtends(sel, items);
    if items == [] {
      assert r[|sel|..] == [];
    } else if Contains(sel, items[0].id) {
      MergedAppendsFresh(sel, items[1..]);
    } else {
      var next := sel + [items[0]];
      MergedAppendsFresh(next, items[1..]);
      MergedExtends(next, items[1..]);
      assert r[|sel|] == next[|sel|] == items[0];
      forall j | |sel| <= j < |r| ensures !Contains(sel, r[j].id) {
        if j > |sel| {
          assert !Contains(next, r[j].id);
        }
      }
      assert r[|sel|..][0] == items[0];
      assert r[|sel|..][1..] == r[|next|..];
    }
  }

  /** A selected id keeps the record value it was selected with. */
  lemma MergedKeepsSelected(sel: seq<Artwork>, items: seq<Artwork>)
    ensures forall j :: 0 <= j < |Merged(sel, items)| && Contains(sel, Merged(sel, items)[j].id) ==>
      j < |sel| && Merged(sel, items)[j] == sel[j]
  {
    MergedExtends(sel, items);
    MergedAppendsFresh(sel, items);
    var r := Merged(sel, items);
    forall j | 0 <= j < |r| && Contains(sel, r[j].id) ensures j < |sel| && r[j] == sel[j] {
      assert r[j] == r[..|sel|][j];
    }
  }

  /** After the merge an id is selected iff it was selected before or is among the items. */
  lemma {:induction false} MergedContains(sel: seq<Artwork>, items: seq<Artwork>, id: int)
    ensures Contains(Merged(sel, items), id) <==> Contains(sel, id) || Contains(items, id)
    decreases |items|
  {
    if items != [] {
      var next := if Contains(sel, items[0].id) then sel else sel + [items[0]];
      MergedContains(next, items[1..], id);
      assert Contains(next, id) <==> Contains(sel, id) || items[0].id == id by {
        if !Contains(sel, items[0].id) {
          assert next[|sel|] == items[0];
          if Contains(next, id) && !Contains(sel, id) {
            var k :| 0 <= k < |next| && next[k].id == id;
          }
          if Contains(sel, id) {
            var k :| 0 <= k < |sel| && sel[k].id == id;
            assert next[k] == sel[k];
          }
        }
      }
      assert Contains(items, id) <==> items[0].id == id || Contains(items[1..], id);
    }
  }

  /** After the merge every item's id is selected; for a non-empty page the header box is checked. */
  lemma MergedSelectsAll(sel: seq<Artwork>, items: seq<Artwork>)
    ensures forall i :: 0 <= i < |items| ==> Contains(Merged(sel, items), items[i].id)
    ensures |items| > 0 ==> IsAllSelected(items, Merged(sel, items))
  {
    forall i | 0 <= i < |items| ensures Contains(Merged(sel, items), items[i].id) {
      MergedContains(sel, items, items[i].id);
    }
  }

  /** The merge never introduces a duplicate id. */
  lemma {:induction false} MergedDistinct(sel: seq<Artwork>, items: seq<Artwork>)
    requires DistinctIds(sel)
    ensures DistinctIds(Merged(sel, items))
    decreases |items|
  {
    if items != [] {
      if Contains(sel, items[0].id) {
        MergedDistinct(sel, items[1..]);
      } else {
        ToggleOnFresh(sel, items[0]);
        MergedDistinct(sel + [items[0]], items[1..]);
      }
    }
  }

  /**
   * The appended entries have pairwise distinct ids, even when the old
   * selection already holds a duplicate (a row checked twice).
   */
  lemma {:induction false} MergedAppendedDistinct(sel: seq<Artwork>, items: seq<Artwork>)
    ensures |sel| <= |Merged(sel, items)| && DistinctIds(Merged(sel, items)[|sel|..])
    decreases |items|
  {
    var r := Merged(sel, items);
    MergedExtends(sel, items);
    if items == [] {
      assert r[|sel|..] == [];
    } else if Contains(sel, items[0].id) {
      MergedAppendedDistinct(sel, items[1..]);
    } else {
      var next := sel + [items[0]];
      MergedAppendedDistinct(next, items[1..]);
      MergedAppendsFresh(next, items[1..]);
      MergedExtends(next, items[1..]);
      var tail := r[|next|..];
      assert r[|sel|..] == [items[0]] + tail;
      forall j | 0 <= j < |tail| ensures tail[j].id != items[0].id {
        assert tail[j] == r[|next| + j];
        assert !Contains(next, r[|next| + j].id);
        assert next[|sel|] == items[0];
      }
    }
  }

  /**
   * When the items hold one id more than once, the merge keeps the first of
   * them: every appended entry is an item that no earlier item shares an id
   * with.
   */
  lemma {:induction false} MergedFirstOccurrence(sel: seq<Artwork>, items: seq<Artwork>)
    ensures forall j :: |sel| <= j < |Merged(sel, items)| ==>
      exists k :: 0 <= k < |items| && items[k] == Merged(sel, items)[j] &&
                  forall m :: 0 <= m < k ==> items[m].id != items[k].id
    decreases |items|
  {
    var r := Merged(sel, items);
    if items != [] {
      var next := if Contains(sel, items[0].id) then sel else sel + [items[0]];
      MergedFirstOccurrence(next, items[1..]);
      MergedExtends(next, items[1..]);
      MergedAppendsFresh(next, items[1..]);
      forall j | |sel| <= j < |r|
        ensures exists k :: 0 <= k < |items| && items[k] == r[j] &&
                            forall m :: 0 <= m < k ==> items[m].id != items[k].id
      {
        if j < |next| {
          assert j == |sel| && next[j] == items[0] && r[j] == items[0];
          assert items[0] == r[j];
        } else {
          var k' :| 0 <= k' < |items[1..]| && items[1..][k'] == r[j] &&
                    forall m :: 0 <= m < k' ==> items[1..][m].id != items[1..][k'].id;
          assert items[0].id != r[j].id by {
            assert !Contains(next, r[j].id);
            if next == sel {
              assert Contains(sel, items[0].id);
            } else {
              assert next[|sel|] == items[0];
            }
          }
          assert items[k' + 1] == r[j];
          forall m | 0 <= m < k' + 1 ensures items[m].id != items[k' + 1].id {
            if m > 0 {
              assert items[m] == items[1..][m - 1];
            }
          }
        }
      }
    }
  }

  /** When every item is already selected the merge changes nothing. */
  lemma {:induction false} MergedAllPresent(sel: seq<Artwork>, items: seq<Artwork>)
    requires Every(items, sel)
    ensures Merged(sel, items) == sel
    decreases |items|
  {
    if items != [] {
      assert Contains(sel, items[0].id);
      MergedAllPresent(sel, items[1..]);
    }
  }
}
