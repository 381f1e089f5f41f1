/** The cross-page row-selection bookkeeping of the artwork table, stated on values.
    The persistent state is a pair of id sets (explicit selections and explicit
    opt-outs); what the table shows as checked on a page is derived from the pair
    and that page's rows. */
module Selection {

  /** A catalog record. Of its fields only the identifier affects selection. */
  datatype Artwork = Artwork(id: int)

  /** The two persistent id sets. An id in `deselected` overrides `selected`. */
  datatype Marks = Marks(selected: set<int>, deselected: set<int>)

  /** The identifiers of a list of rows. */
  function Ids(rows: seq<Artwork>): set<int>
  {
    set r | r in rows :: r.id
  }

  /** No two rows of a page share an identifier (the table is keyed by `id`). */
  predicate UniqueIds(rows: seq<Artwork>)
  {
    forall i, j :: 0 <= i < j < |rows| ==> rows[i].id != rows[j].id
  }

  /** Whether a row with identifier `id` is shown as checked. */
  predicate IsMarked(m: Marks, id: int)
  {
    id in m.selected && id !in m.deselected
  }

  /** `r` is obtained from `s` by leaving out some elements, keeping the order. */
  predicate IsSubsequence(r: seq<Artwork>, s: seq<Artwork>)
    decreases |s|
  {
    if r == [] then true
    else if s == [] then false
    else (r[0] == s[0] && IsSubsequence(r[1..], s[1..])) || IsSubsequence(r, s[1..])
  }

  /** The rows of the page that are shown as checked, in page order. */
  function EffectiveSelection(rows: seq<Artwork>, m: Marks): (r: seq<Artwork>)
    ensures IsSubsequence(r, rows)
    ensures forall a :: a in r <==> a in rows && IsMarked(m, a.id)
  {
    if rows == [] then []
    else
      var rest := EffectiveSelection(rows[1..], m);
      if IsMarked(m, rows[0].id) then [rows[0]] + rest else rest
  }

  /** A kept row occurs in the effective selection as often as on the page; others do not occur. */
  lemma {:induction false} EffectiveSelectionCounts(rows: seq<Artwork>, m: Marks, a: Artwork)
    ensures multiset(EffectiveSelection(rows, m))[a] == if IsMarked(m, a.id) then multiset(rows)[a] else 0
  {
    if rows != [] {
      assert rows == [rows[0]] + rows[1..];
      EffectiveSelectionCounts(rows[1..], m, a);
    }
  }

  /** The effective selection of a page depends only on how its own ids are marked. */
  lemma {:induction false} EffectiveSelectionLocal(rows: seq<Artwork>, m1: Marks, m2: Marks)
    requires forall id :: id in Ids(rows) ==> (IsMarked(m1, id) <==> IsMarked(m2, id))
    ensures EffectiveSelection(rows, m1) == EffectiveSelection(rows, m2)
  {
    if rows != [] {
      assert rows[0] in rows;
      forall id | id in Ids(rows[1..]) ensures IsMarked(m1, id) <==> IsMarked(m2, id) {
        var r :| r in rows[1..] && r.id == id;
        assert r in rows;
      }
      EffectiveSelectionLocal(rows[1..], m1, m2);
    }
  }

  /** When exactly the first `limit` rows are marked, the effective selection is that prefix. */
  lemma {:induction false} EffectiveSelectionOfPrefix(rows: seq<Artwork>, m: Marks, limit: nat)
    requires limit <= |rows|
    requires forall i :: 0 <= i < |rows| ==> (IsMarked(m, rows[i].id) <==> i < limit)
    ensures EffectiveSelection(rows, m) == rows[..limit]
  {
    if rows != [] {
      var tail := rows[1..];
      var next := if limit == 0 then 0 else limit - 1;
      forall i | 0 <= i < |tail| ensures IsMarked(m, tail[i].id) <==> i < next {
        assert tail[i] == rows[i + 1];
      }
      EffectiveSelectionOfPrefix(tail, m, next);
      if limit > 0 {
        assert IsMarked(m, rows[0].id);
        assert EffectiveSelection(rows, m) == [rows[0]] + tail[..next];
        assert rows[..limit] == [rows[0]] + tail[..next];
      } else {
        assert !IsMarked(m, rows[0].id);
        assert EffectiveSelection(rows, m) == tail[..0];
      }
    }
  }

  lemma IdsOfPrefix(rows: seq<Artwork>, i: nat)
    requires i < |rows|
    ensures Ids(rows[..i + 1]) == Ids(rows[..i]) + {rows[i].id}
  {
    assert rows[..i + 1] == rows[..i] + [rows[i]];
  }

  lemma IdsOfWhole(rows: seq<Artwork>)
    ensures Ids(rows[..|rows|]) == Ids(rows)
  {
    assert rows[..|rows|] == rows;
  }

  // ---------------- checkbox selection ----------------

  /** Ids of page rows that were selected and are no longer chosen. */
  function Dropped(rows: seq<Artwork>, selected: set<int>, value: seq<Artwork>): set<int>
  {
    set r | r in rows && r.id in selected && r.id !in Ids(value) :: r.id
  }

  lemma DroppedOfPrefix(rows: seq<Artwork>, selected: set<int>, value: seq<Artwork>, j: nat)
    requires j < |rows|
    ensures Dropped(rows[..j + 1], selected, value)
         == Dropped(rows[..j], selected, value)
            + (if rows[j].id in selected && rows[j].id !in Ids(value) then {rows[j].id} else {})
  {
    assert rows[..j + 1] == rows[..j] + [rows[j]];
  }

  lemma DroppedOfWhole(rows: seq<Artwork>, selected: set<int>, value: seq<Artwork>)
    ensures Dropped(rows[..|rows|], selected, value) == Dropped(rows, selected, value)
  {
    assert rows[..|rows|] == rows;
  }

  /** The new marks after the table reports `value` as the chosen rows of page `rows`. */
  function SelectionChange(m: Marks, rows: seq<Artwork>, value: seq<Artwork>): (m': Marks)
    // every chosen row is selected and not opted out
    ensures forall r :: r in value ==> r.id in m'.selected && r.id !in m'.deselected
    // a page row that was selected and is no longer chosen is opted out
    ensures forall r :: r in rows && r.id in m.selected && r.id !in Ids(value) ==> r.id in m'.deselected
    // selections only grow
    ensures m.selected <= m'.selected
    // ids neither on the page nor chosen keep their membership in both sets
    ensures forall id :: id !in Ids(rows) && id !in Ids(value) ==>
              (id in m'.selected <==> id in m.selected) && (id in m'.deselected <==> id in m.deselected)
  {
    Marks(m.selected + Ids(value), (m.deselected - Ids(value)) + Dropped(rows, m.selected, value))
  }

  /** After a checkbox change the page shows exactly the chosen rows, in page order. */
  lemma SelectionChangeShowsChoice(m: Marks, rows: seq<Artwork>, value: seq<Artwork>)
    ensures EffectiveSelection(rows, SelectionChange(m, rows, value))
         == EffectiveSelection(rows, Marks(Ids(value), {}))
  {
    var m' := SelectionChange(m, rows, value);
    forall id | id in Ids(rows) ensures IsMarked(m', id) <==> IsMarked(Marks(Ids(value), {}), id) {
      var r :| r in rows && r.id == id;
      if id !in Ids(value) && id in m.selected {
        assert id in Dropped(rows, m.selected, value);
      }
    }
    EffectiveSelectionLocal(rows, m', Marks(Ids(value), {}));
  }

  /** A row that was checked and is left out of the new choice is no longer shown as checked. */
  lemma SelectionChangeUnchecks(m: Marks, rows: seq<Artwork>, value: seq<Artwork>, r: Artwork)
    requires r in rows && r.id in m.selected && r.id !in Ids(value)
    ensures r !in EffectiveSelection(rows, SelectionChange(m, rows, value))
  {
  }

  /** A checkbox change on one page leaves every page with other ids as it was. */
  lemma SelectionChangeKeepsOtherPages(m: Marks, rows: seq<Artwork>, value: seq<Artwork>, other: seq<Artwork>)
    requires Ids(other) !! Ids(rows) + Ids(value)
    ensures EffectiveSelection(other, SelectionChange(m, rows, value)) == EffectiveSelection(other, m)
  {
    EffectiveSelectionLocal(other, SelectionChange(m, rows, value), m);
  }

  // ---------------- bulk "select first N" ----------------

  /** The requested count clamped to the page length. */
  function ClampedLimit(n: int, len: nat): (limit: nat)
    requires n > 0
    ensures limit <= len && limit <= n
    ensures limit == n || limit == len
  {
    if n < len then n else len
  }

  /** The new marks after replacing the page's selection with its first `limit` rows. */
  function BulkSelect(m: Marks, rows: seq<Artwork>, limit: nat): (m': Marks)
    requires limit <= |rows|
    // no page id remains opted out
    ensures Ids(rows) !! m'.deselected
    // the first `limit` rows are selected
    ensures forall i :: 0 <= i < limit ==> IsMarked(m', rows[i].id)
    // ids of other pages keep their membership in both sets
    ensures forall id :: id !in Ids(rows) ==>
              (id in m'.selected <==> id in m.selected) && (id in m'.deselected <==> id in m.deselected)
  {
    assert forall i :: 0 <= i < limit ==> rows[..limit][i] == rows[i];
    Marks((m.selected - Ids(rows)) + Ids(rows[..limit]), m.deselected - Ids(rows))
  }

  /** With unique ids, rows at index `limit` or later are in neither set after a bulk selection. */
  lemma BulkSelectClearsRest(m: Marks, rows: seq<Artwork>, limit: nat, i: nat)
    requires limit <= i < |rows| && UniqueIds(rows)
    ensures rows[i].id !in BulkSelect(m, rows, limit).selected
    ensures rows[i].id !in BulkSelect(m, rows, limit).deselected
  {
  }

  /** With unique ids, a bulk selection shows exactly the first `limit` rows. */
  lemma BulkSelectShowsPrefix(m: Marks, rows: seq<Artwork>, limit: nat)
    requires limit <= |rows| && UniqueIds(rows)
    ensures EffectiveSelection(rows, BulkSelect(m, rows, limit)) == rows[..limit]
    ensures |EffectiveSelection(rows, BulkSelect(m, rows, limit))| <= |rows|
  {
    forall i | 0 <= i < |rows| ensures IsMarked(BulkSelect(m, rows, limit), rows[i].id) <==> i < limit {
      if i >= limit {
        BulkSelectClearsRest(m, rows, limit, i);
      }
    }
    EffectiveSelectionOfPrefix(rows, BulkSelect(m, rows, limit), limit);
  }

  /** A bulk selection on one page leaves every page with other ids as it was. */
  lemma BulkSelectKeepsOtherPages(m: Marks, rows: seq<Artwork>, limit: nat, other: seq<Artwork>)
    requires limit <= |rows| && Ids(other) !! Ids(rows)
    ensures EffectiveSelection(other, BulkSelect(m, rows, limit)) == EffectiveSelection(other, m)
  {
    EffectiveSelectionLocal(other, BulkSelect(m, rows, limit), m);
  }
}
