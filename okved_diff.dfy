/**
 A model of the diff between two snapshots of the OKVED directory: every record
 of the "before" list and of the "after" list is reconciled by its id into one
 table row tagged unmodified, updated, new or deleted.
 */
module OkvedDiff {

  /** One entry of the directory: a numeric id, a short code and a name. */
  datatype Record = Record(id: int, code: string, name: string)

  /** How a record changed between the two snapshots. */
  datatype State = Unmodified | Updated | New | Deleted

  /** One row of the rendered table: a record and its change state. */
  datatype TableRecord = TableRecord(obj: Record, state: State)

  // ---------------------------------------------------------------------------
  // Ids, occurrences and the first and last record carrying an id.
  // All of these recurse on the last element, as the loops of GetDiff do.
  // ---------------------------------------------------------------------------

  /** The set of ids occurring in `s`. */
  function Ids(s: seq<Record>): set<int>
  {
    if s == [] then {} else Ids(s[..|s| - 1]) + {s[|s| - 1].id}
  }

  /** The number of records of `s` whose id is `k`. */
  function Occurrences(s: seq<Record>, k: int): nat
  {
    if s == [] then 0
    else Occurrences(s[..|s| - 1], k) + (if s[|s| - 1].id == k then 1 else 0)
  }

  /** The first record of `s` whose id is `k`. */
  function FirstWith(s: seq<Record>, k: int): (r: Record)
    requires k in Ids(s)
    ensures r.id == k
  {
    if k in Ids(s[..|s| - 1]) then FirstWith(s[..|s| - 1], k) else s[|s| - 1]
  }

  /** The last record of `s` whose id is `k`. */
  function LastWith(s: seq<Record>, k: int): (r: Record)
    requires k in Ids(s)
    ensures r.id == k
  {
    if s[|s| - 1].id == k then s[|s| - 1] else LastWith(s[..|s| - 1], k)
  }

  /** The ids of `s`, in order, repetitions included. */
  function IdsOf(s: seq<Record>): (r: seq<int>)
    ensures |r| == |s|
  {
    seq(|s|, i requires 0 <= i < |s| => s[i].id)
  }

  /** No two entries of `q` are equal. */
  predicate Distinct(q: seq<int>)
  {
    forall i, j :: 0 <= i < j < |q| ==> q[i] != q[j]
  }

  /** No two records of `s` share an id. */
  predicate Unique(s: seq<Record>)
  {
    Distinct(IdsOf(s))
  }

  lemma UniqueIndex(s: seq<Record>)
    ensures Unique(s) <==> forall i, j :: 0 <= i < j < |s| ==> s[i].id != s[j].id
  {
    assert forall i :: 0 <= i < |s| ==> IdsOf(s)[i] == s[i].id;
  }

  /** The records of `s` whose id is not in `after`, in their order in `s`. */
  function Absent(s: seq<Record>, after: set<int>): (r: seq<Record>)
    ensures forall i :: 0 <= i < |r| ==> r[i] in s && r[i].id !in after
  {
    if s == [] then []
    else if s[|s| - 1].id in after then Absent(s[..|s| - 1], after)
    else Absent(s[..|s| - 1], after) + [s[|s| - 1]]
  }

  lemma {:induction false} IdsIndex(s: seq<Record>, k: int)
    ensures k in Ids(s) <==> exists i :: 0 <= i < |s| && s[i].id == k
  {
    if s != [] {
      var init := s[..|s| - 1];
      IdsIndex(init, k);
      if k in Ids(init) {
        var i :| 0 <= i < |init| && init[i].id == k;
        assert s[i].id == k;
      } else if exists i :: 0 <= i < |s| && s[i].id == k {
        var i :| 0 <= i < |s| && s[i].id == k;
        if i < |s| - 1 {
          assert init[i].id == k;
        }
      }
    }
  }

  lemma {:induction false} OccurrencesPositive(s: seq<Record>, k: int)
    ensures k in Ids(s) <==> Occurrences(s, k) > 0
  {
    if s != [] {
      OccurrencesPositive(s[..|s| - 1], k);
    }
  }

  /** FirstWith is the record at the least index carrying `k`. */
  lemma {:induction false} FirstWithIndex(s: seq<Record>, k: int)
    requires k in Ids(s)
    ensures exists j :: 0 <= j < |s| && s[j] == FirstWith(s, k)
                        && forall i :: 0 <= i < j ==> s[i].id != k
  {
    var init := s[..|s| - 1];
    if k in Ids(init) {
      FirstWithIndex(init, k);
      var j :| 0 <= j < |init| && init[j] == FirstWith(init, k)
               && forall i :: 0 <= i < j ==> init[i].id != k;
      assert s[j] == FirstWith(s, k);
      assert forall i :: 0 <= i < j ==> s[i].id != k by {
        forall i | 0 <= i < j ensures s[i].id != k { assert s[i] == init[i]; }
      }
    } else {
      IdsIndex(init, k);
      assert s[|s| - 1] == FirstWith(s, k);
      assert forall i :: 0 <= i < |s| - 1 ==> s[i].id != k by {
        forall i | 0 <= i < |s| - 1 ensures s[i].id != k { assert s[i] == init[i]; }
      }
    }
  }

  /** LastWith is the record at the greatest index carrying `k`. */
  lemma {:induction false} LastWithIndex(s: seq<Record>, k: int)
    requires k in Ids(s)
    ensures exists j :: 0 <= j < |s| && s[j] == LastWith(s, k)
                        && forall i :: j < i < |s| ==> s[i].id != k
  {
    var init := s[..|s| - 1];
    if s[|s| - 1].id == k {
      assert s[|s| - 1] == LastWith(s, k);
    } else {
      LastWithIndex(init, k);
      var j :| 0 <= j < |init| && init[j] == LastWith(init, k)
               && forall i :: j < i < |init| ==> init[i].id != k;
      assert s[j] == LastWith(s, k);
      assert forall i :: j < i < |s| ==> s[i].id != k by {
        forall i | j < i < |s| ensures s[i].id != k {
          if i < |s| - 1 { assert s[i] == init[i]; }
        }
      }
    }
  }

  /** In a list with unique ids, the record at index `j` is the first and the
      last one with its id, and the only one. */
  lemma {:induction false} UniqueWith(s: seq<Record>, j: int)
    requires Unique(s) && 0 <= j < |s|
    ensures s[j].id in Ids(s)
    ensures FirstWith(s, s[j].id) == s[j] && LastWith(s, s[j].id) == s[j]
    ensures Occurrences(s, s[j].id) == 1
  {
    var init := s[..|s| - 1];
    var k := s[j].id;
    UniqueIndex(s);
    UniqueIndex(init);
    if j == |s| - 1 {
      IdsIndex(init, k);
      OccurrencesPositive(init, k);
    } else {
      assert init[j] == s[j];
      UniqueWith(init, j);
      assert s[|s| - 1].id != k;
    }
  }

  // ---------------------------------------------------------------------------
  // The specification: the order of the keys and the row of each key.
  // ---------------------------------------------------------------------------

  /** The ids of `s` in order of first occurrence (the order in which a Python
      dict keyed by id receives them). */
  function DistinctIds(s: seq<Record>): (r: seq<int>)
    ensures forall n :: 0 <= n < |r| ==> r[n] in Ids(s)
  {
    if s == [] then []
    else if s[|s| - 1].id in Ids(s[..|s| - 1]) then DistinctIds(s[..|s| - 1])
    else DistinctIds(s[..|s| - 1]) + [s[|s| - 1].id]
  }

  /** The ids of `before` that are not in `after`, in order of first occurrence. */
  function BeforeOnlyIds(before: seq<Record>, after: set<int>): (r: seq<int>)
    ensures forall n :: 0 <= n < |r| ==> r[n] in Ids(before) && r[n] !in after
  {
    if before == [] then []
    else
      var init, k := before[..|before| - 1], before[|before| - 1].id;
      if k in Ids(init) || k in after then BeforeOnlyIds(init, after)
      else BeforeOnlyIds(init, after) + [k]
  }

  /** The order of the output rows: the ids of the after list, then the ids
      found only in the before list. */
  function KeyOrder(l1: seq<Record>, l2: seq<Record>): (r: seq<int>)
    ensures forall n :: 0 <= n < |r| ==> r[n] in Ids(l1) + Ids(l2)
  {
    DistinctIds(l2) + BeforeOnlyIds(l1, Ids(l2))
  }

  /** The row of id `k`, stated per id:
      - an id of the after list carries the last after-side record with that id;
        it is new when the before list lacks the id, and otherwise unmodified or
        updated as the last before-side record with that id equals it or not;
      - an id found only in the before list carries the first before-side record
        with that id; it is deleted when it occurs once, and otherwise the last
        before-side occurrence is compared against that first one. */
  function Entry(l1: seq<Record>, l2: seq<Record>, k: int): (r: TableRecord)
    requires k in Ids(l1) + Ids(l2)
    ensures r.obj.id == k
    ensures r.state == New <==> k !in Ids(l1)
    ensures k in Ids(l1) * Ids(l2) ==> r.state == Unmodified || r.state == Updated
  {
    if k in Ids(l2) then
      var after := LastWith(l2, k);
      if k !in Ids(l1) then TableRecord(after, New)
      else if LastWith(l1, k) == after then TableRecord(after, Unmodified)
      else TableRecord(after, Updated)
    else
      var first := FirstWith(l1, k);
      if Occurrences(l1, k) == 1 then TableRecord(first, Deleted)
      else if LastWith(l1, k) == first then TableRecord(first, Unmodified)
      else TableRecord(first, Updated)
  }

  /** The diff of `l1` (before) and `l2` (after): one row per key, in key order. */
  function Diff(l1: seq<Record>, l2: seq<Record>): (r: seq<TableRecord>)
    ensures |r| == |KeyOrder(l1, l2)|
    ensures forall n :: 0 <= n < |r| ==> r[n].obj.id == KeyOrder(l1, l2)[n]
  {
    var ks := KeyOrder(l1, l2);
    seq(|ks|, n requires 0 <= n < |ks| => Entry(l1, l2, ks[n]))
  }

  /** One more after-side record `x`: its id joins the keys if new, and `x`
      becomes the last record of its id. */
  lemma AfterStep(p: seq<Record>, x: Record)
    ensures Ids(p + [x]) == Ids(p) + {x.id}
    ensures DistinctIds(p + [x]) == if x.id in Ids(p) then DistinctIds(p) else DistinctIds(p) + [x.id]
    ensures forall k :: k in Ids(p + [x]) ==> LastWith(p + [x], k) == if k == x.id then x else LastWith(p, k)
  {
  }

  /** One more before-side record `x`: its id is appended to the keys when
      neither list seen so far carries it. */
  lemma BeforeStep(p: seq<Record>, x: Record, after: set<int>)
    ensures Ids(p + [x]) == Ids(p) + {x.id}
    ensures BeforeOnlyIds(p + [x], after)
            == if x.id in Ids(p) || x.id in after then BeforeOnlyIds(p, after)
               else BeforeOnlyIds(p, after) + [x.id]
  {
  }

  /** Walking one more before-side record `x` changes the row of its id only:
      an unknown id gains a deleted row with `x`, a known id keeps its record
      and is retagged unmodified or updated as `x` equals that record or not. */
  lemma EntryStep(p: seq<Record>, x: Record, l2: seq<Record>, k: int)
    requires k in Ids(p + [x]) + Ids(l2)
    ensures k != x.id ==> k in Ids(p) + Ids(l2) && Entry(p + [x], l2, k) == Entry(p, l2, k)
    ensures k == x.id && k !in Ids(p) + Ids(l2) ==> Entry(p + [x], l2, k) == TableRecord(x, Deleted)
    ensures k == x.id && k in Ids(p) + Ids(l2) ==>
              Entry(p + [x], l2, k)
              == Entry(p, l2, k).(state := if x == Entry(p, l2, k).obj then Unmodified else Updated)
  {
    var s := p + [x];
    assert s[..|s| - 1] == p;
    OccurrencesPositive(p, k);
  }

  // ---------------------------------------------------------------------------
  // The algorithm.
  // ---------------------------------------------------------------------------

  /** The first loop of get_diff: index the after list by id, every row new.
      `keys` holds the dict's insertion order. */
  method IndexAfter(l2: seq<Record>) returns (keys: seq<int>, results: map<int, TableRecord>)
    ensures keys == DistinctIds(l2)
    ensures results.Keys == Ids(l2)
    ensures forall k :: k in results ==> results[k] == TableRecord(LastWith(l2, k), New)
  {
    keys, results := [], map[];
    for i := 0 to |l2|
      invariant keys == DistinctIds(l2[..i])
      invariant results.Keys == Ids(l2[..i])
      invariant forall k :: k in results ==> results[k] == TableRecord(LastWith(l2[..i], k), New)
    {
      var item := l2[i];
      assert l2[..i + 1] == l2[..i] + [item];
      AfterStep(l2[..i], item);
      if item.id !in results {
        keys := keys + [item.id];
      }
      results := results[item.id := TableRecord(item, New)];
    }
    assert l2[..|l2|] == l2;
  }

  /** One pass of the second loop of get_diff over the before-side record
      `item`, on the dict built from the after list and the before records `p`
      seen so far: an unknown id is inserted as deleted, a known one retagged
      unmodified or updated as `item` equals its record or not. */
  method VisitBefore(l2: seq<Record>, p: seq<Record>, item: Record,
                     keys: seq<int>, results: map<int, TableRecord>)
    returns (keys': seq<int>, results': map<int, TableRecord>)
    requires keys == DistinctIds(l2) + BeforeOnlyIds(p, Ids(l2))
    requires results.Keys == Ids(p) + Ids(l2)
    requires forall k :: k in results ==> results[k] == Entry(p, l2, k)
    ensures keys' == DistinctIds(l2) + BeforeOnlyIds(p + [item], Ids(l2))
    ensures results'.Keys == Ids(p + [item]) + Ids(l2)
    ensures forall k :: k in results' ==> results'[k] == Entry(p + [item], l2, k)
  {
    BeforeStep(p, item, Ids(l2));
    keys' := keys;
    if item.id !in results {
      keys' := keys + [item.id];
      results' := results[item.id := TableRecord(item, Deleted)];
    } else if item == results[item.id].obj {
      results' := results[item.id := results[item.id].(state := Unmodified)];
    } else {
      // the source's third branch tests `!=`, the complement of the second
      results' := results[item.id := results[item.id].(state := Updated)];
    }
    forall k | k in results'
      ensures results'[k] == Entry(p + [item], l2, k)
    {
      EntryStep(p, item, l2, k);
    }
  }

  /** get_diff: index the after list by id (every row new), then walk the before
      list, inserting unknown ids as deleted and retagging known ones as
      unmodified or updated, and read the rows out in insertion order. */
  method GetDiff(l1: seq<Record>, l2: seq<Record>) returns (out: seq<TableRecord>)
    ensures out == Diff(l1, l2)
  {
    var keys, results := IndexAfter(l2);
    for j := 0 to |l1|
      invariant keys == DistinctIds(l2) + BeforeOnlyIds(l1[..j], Ids(l2))
      invariant results.Keys == Ids(l1[..j]) + Ids(l2)
      invariant forall k :: k in results ==> results[k] == Entry(l1[..j], l2, k)
    {
      assert l1[..j + 1] == l1[..j] + [l1[j]];
      keys, results := VisitBefore(l2, l1[..j], l1[j], keys, results);
    }
    assert l1[..|l1|] == l1;

    out := seq(|keys|, n requires 0 <= n < |keys| => results[keys[n]]);
    assert |out| == |Diff(l1, l2)|;
    assert forall n :: 0 <= n < |out| ==> out[n] == Entry(l1, l2, keys[n]);
  }

  // ---------------------------------------------------------------------------
  // Properties of the diff.
  // ---------------------------------------------------------------------------

  lemma {:induction false} DistinctIdsProps(s: seq<Record>)
    ensures forall k :: k in Ids(s) ==> k in DistinctIds(s)
    ensures Distinct(DistinctIds(s))
    ensures |DistinctIds(s)| == |Ids(s)|
  {
    if s != [] {
      var init, k := s[..|s| - 1], s[|s| - 1].id;
      DistinctIdsProps(init);
      var d := DistinctIds(init);
      if k !in Ids(init) {
        assert DistinctIds(s) == d + [k];
        assert forall n :: 0 <= n < |d| ==> d[n] != k;
        assert Ids(s) == Ids(init) + {k};
      }
    }
  }

  lemma {:induction false} BeforeOnlyIdsProps(before: seq<Record>, after: set<int>)
    ensures forall k :: k in Ids(before) && k !in after ==> k in BeforeOnlyIds(before, after)
    ensures Distinct(BeforeOnlyIds(before, after))
    ensures |BeforeOnlyIds(before, after)| == |Ids(before) - after|
  {
    if before != [] {
      var init, k := before[..|before| - 1], before[|before| - 1].id;
      BeforeOnlyIdsProps(init, after);
      if k in Ids(init) || k in after {
        assert Ids(before) - after == Ids(init) - after;
      } else {
        assert Ids(before) - after == (Ids(init) - after) + {k};
      }
    }
  }

  /** The key order lists every id of either list exactly once. */
  lemma KeyOrderProps(l1: seq<Record>, l2: seq<Record>)
    ensures forall k :: k in Ids(l1) + Ids(l2) ==> k in KeyOrder(l1, l2)
    ensures Distinct(KeyOrder(l1, l2))
    ensures |KeyOrder(l1, l2)| == |Ids(l1) + Ids(l2)|
  {
    DistinctIdsProps(l2);
    BeforeOnlyIdsProps(l1, Ids(l2));
    assert Ids(l1) + Ids(l2) == Ids(l2) + (Ids(l1) - Ids(l2));
    assert Ids(l2) * (Ids(l1) - Ids(l2)) == {};
  }

  /** Every id of either list is in exactly one row, no other id is, and there
      are as many rows as distinct ids. Holds for all inputs, duplicates included. */
  lemma DiffIds(l1: seq<Record>, l2: seq<Record>)
    ensures |Diff(l1, l2)| == |Ids(l1) + Ids(l2)|
    ensures forall i :: 0 <= i < |Diff(l1, l2)| ==> Diff(l1, l2)[i].obj.id in Ids(l1) + Ids(l2)
    ensures forall k :: k in Ids(l1) + Ids(l2) ==>
              exists i :: 0 <= i < |Diff(l1, l2)| && Diff(l1, l2)[i].obj.id == k
    ensures forall i, j :: 0 <= i < j < |Diff(l1, l2)| ==> Diff(l1, l2)[i].obj.id != Diff(l1, l2)[j].obj.id
  {
    var out, ks := Diff(l1, l2), KeyOrder(l1, l2);
    KeyOrderProps(l1, l2);
    assert forall i :: 0 <= i < |out| ==> out[i].obj.id == ks[i];
    forall k | k in Ids(l1) + Ids(l2)
      ensures exists i :: 0 <= i < |out| && out[i].obj.id == k
    {
      var n :| 0 <= n < |ks| && ks[n] == k;
      assert out[n].obj.id == k;
    }
  }

  lemma {:induction false} DistinctIdsUnique(s: seq<Record>)
    requires Unique(s)
    ensures DistinctIds(s) == IdsOf(s)
  {
    if s != [] {
      var init := s[..|s| - 1];
      UniqueIndex(s);
    UniqueIndex(init);
      DistinctIdsUnique(init);
      IdsIndex(init, s[|s| - 1].id);
      assert IdsOf(s) == IdsOf(init) + [s[|s| - 1].id];
    }
  }

  lemma {:induction false} BeforeOnlyIdsUnique(before: seq<Record>, after: set<int>)
    requires Unique(before)
    ensures BeforeOnlyIds(before, after) == IdsOf(Absent(before, after))
  {
    if before != [] {
      var init := before[..|before| - 1];
      var k := before[|before| - 1].id;
      UniqueIndex(before);
    UniqueIndex(init);
      BeforeOnlyIdsUnique(init, after);
      IdsIndex(init, k);
      if k !in after {
        assert IdsOf(Absent(before, after)) == IdsOf(Absent(init, after)) + [k];
      }
    }
  }

  /** With unique ids on each side, the output lists the after records in their
      order, each tagged new when its id is missing from the before list and
      otherwise unmodified or updated as the before list holds that very record
      or not; it is followed by the before records whose ids the after list
      lacks, in their order, each tagged deleted. */
  lemma DiffUnique(l1: seq<Record>, l2: seq<Record>)
    requires Unique(l1) && Unique(l2)
    ensures |Diff(l1, l2)| == |l2| + |Absent(l1, Ids(l2))|
    ensures forall i :: 0 <= i < |l2| ==>
              Diff(l1, l2)[i] == TableRecord(l2[i], if l2[i].id !in Ids(l1) then New
                                                    else if l2[i] in l1 then Unmodified
                                                    else Updated)
    ensures forall i :: 0 <= i < |Absent(l1, Ids(l2))| ==>
              Diff(l1, l2)[|l2| + i] == TableRecord(Absent(l1, Ids(l2))[i], Deleted)
  {
    var out, gone := Diff(l1, l2), Absent(l1, Ids(l2));
    DistinctIdsUnique(l2);
    BeforeOnlyIdsUnique(l1, Ids(l2));
    assert KeyOrder(l1, l2) == IdsOf(l2) + IdsOf(gone);
    forall i | 0 <= i < |l2|
      ensures out[i] == TableRecord(l2[i], if l2[i].id !in Ids(l1) then New
                                           else if l2[i] in l1 then Unmodified
                                           else Updated)
    {
      var k := l2[i].id;
      UniqueWith(l2, i);
      assert out[i] == Entry(l1, l2, k);
      if k in Ids(l1) {
        IdsIndex(l1, k);
        var m :| 0 <= m < |l1| && l1[m].id == k;
        UniqueWith(l1, m);
        if l2[i] in l1 {
          var m' :| 0 <= m' < |l1| && l1[m'] == l2[i];
          UniqueWith(l1, m');
        }
      }
    }
    forall i | 0 <= i < |gone|
      ensures out[|l2| + i] == TableRecord(gone[i], Deleted)
    {
      var m :| 0 <= m < |l1| && l1[m] == gone[i];
      UniqueWith(l1, m);
      assert out[|l2| + i] == Entry(l1, l2, gone[i].id);
    }
  }

  /** No record of `s` is missing from its own ids. */
  lemma AbsentAll(s: seq<Record>)
    ensures Absent(s, Ids(s)) == []
  {
    var gone := Absent(s, Ids(s));
    if gone != [] {
      IdsIndex(s, gone[0].id);
    }
  }

  /** Comparing a list with itself tags every row unmodified; with unique ids
      the rows are the list's own records, in order. */
  lemma DiffSame(x: seq<Record>)
    ensures forall i :: 0 <= i < |Diff(x, x)| ==> Diff(x, x)[i].state == Unmodified
    ensures Unique(x) ==> Diff(x, x) == seq(|x|, i requires 0 <= i < |x| => TableRecord(x[i], Unmodified))
  {
    if Unique(x) {
      AbsentAll(x);
      DiffUnique(x, x);
      assert forall i :: 0 <= i < |x| ==> x[i] in x;
    }
  }

  /** Every record of an after list compared with an empty before list is new;
      with unique ids the rows are its records, in order. */
  lemma DiffEmptyBefore(x: seq<Record>)
    ensures forall i :: 0 <= i < |Diff([], x)| ==> Diff([], x)[i].state == New
    ensures Unique(x) ==> Diff([], x) == seq(|x|, i requires 0 <= i < |x| => TableRecord(x[i], New))
  {
    if Unique(x) {
      DiffUnique([], x);
    }
  }

  lemma {:induction false} AbsentNone(s: seq<Record>)
    ensures Absent(s, {}) == s
  {
    if s != [] {
      AbsentNone(s[..|s| - 1]);
    }
  }

  /** Every record of a before list with unique ids compared with an empty
      after list is deleted, in order. */
  lemma DiffEmptyAfter(x: seq<Record>)
    requires Unique(x)
    ensures Diff(x, []) == seq(|x|, i requires 0 <= i < |x| => TableRecord(x[i], Deleted))
  {
    DiffUnique(x, []);
    AbsentNone(x);
  }

  /** The ids the first loop has inserted after `m` steps are a prefix of the
      ids it inserts in all: a key, once placed, never moves. */
  lemma {:induction false} DistinctIdsPrefix(s: seq<Record>, m: int)
    requires 0 <= m <= |s|
    ensures DistinctIds(s[..m]) <= DistinctIds(s)
  {
    if m < |s| {
      var init := s[..|s| - 1];
      assert init[..m] == s[..m];
      DistinctIdsPrefix(init, m);
    } else {
      assert s[..m] == s;
    }
  }

  /** The row of an after-side id sits at the position where the first loop
      first inserted it (after the distinct ids before its first occurrence `i`)
      and carries the record of its last occurrence `j`. */
  lemma AfterRow(l1: seq<Record>, l2: seq<Record>, i: int, j: int)
    requires 0 <= i <= j < |l2| && l2[i].id == l2[j].id
    requires forall m :: 0 <= m < i ==> l2[m].id != l2[i].id
    requires forall m :: j < m < |l2| ==> l2[m].id != l2[j].id
    ensures |DistinctIds(l2[..i])| < |Diff(l1, l2)|
    ensures Diff(l1, l2)[|DistinctIds(l2[..i])|].obj == l2[j]
  {
    var k := l2[i].id;
    var p := l2[..i];
    IdsIndex(p, k);
    assert l2[..i + 1][..i] == p;
    assert DistinctIds(l2[..i + 1]) == DistinctIds(p) + [k];
    DistinctIdsPrefix(l2, i + 1);
    var n := |DistinctIds(p)|;
    assert DistinctIds(l2)[n] == k;
    IdsIndex(l2, k);
    LastWithIndex(l2, k);
    var j' :| 0 <= j' < |l2| && l2[j'] == LastWith(l2, k)
              && forall m :: j' < m < |l2| ==> l2[m].id != k;
    assert j' == j;
    assert Diff(l1, l2)[n] == Entry(l1, l2, k);
  }

  /** An id that the after list lacks and the before list repeats is not
      reported deleted: its row carries the first before-side record, and the
      last occurrence decides between unmodified and updated. */
  lemma BeforeRepeated(l1: seq<Record>, l2: seq<Record>, k: int)
    requires k !in Ids(l2) && Occurrences(l1, k) >= 2
    ensures k in Ids(l1)
    ensures exists n :: 0 <= n < |Diff(l1, l2)| &&
              Diff(l1, l2)[n] == TableRecord(FirstWith(l1, k),
                                             if LastWith(l1, k) == FirstWith(l1, k) then Unmodified
                                             else Updated)
  {
    OccurrencesPositive(l1, k);
    KeyOrderProps(l1, l2);
    var ks := KeyOrder(l1, l2);
    var n :| 0 <= n < |ks| && ks[n] == k;
    assert Diff(l1, l2)[n] == Entry(l1, l2, k);
  }

  /** Example: a repeated id in the after list `[a, b, c]` (with `a` and `c`
      sharing an id) keeps the position of `a` but carries `c`. */
  lemma AfterDuplicate(a: Record, b: Record, c: Record)
    requires a.id == c.id && a.id != b.id
    ensures Diff([], [a, b, c]) == [TableRecord(c, New), TableRecord(b, New)]
  {
    assert [a, b, c][..2] == [a, b];
    assert [a, b][..1] == [a];
    assert [a][..0] == [];
    assert Ids([a]) == {a.id};
    assert Ids([a, b]) == {a.id, b.id};
    assert DistinctIds([a]) == [a.id];
    assert DistinctIds([a, b]) == [a.id, b.id];
    assert DistinctIds([a, b, c]) == [a.id, b.id];
    assert LastWith([a, b, c], a.id) == c;
    assert LastWith([a, b, c], b.id) == b;
  }

  /** Example: a before list `[r, s]` of one repeated id against an empty after
      list gives one row, with `r`, tagged unmodified or updated. */
  lemma BeforeDuplicate(r: Record, s: Record)
    requires r.id == s.id
    ensures Diff([r, s], []) == [TableRecord(r, if r == s then Unmodified else Updated)]
  {
    assert [r, s][..1] == [r];
    assert [r][..0] == [];
    assert Ids([r]) == {r.id};
    assert Ids([r, s]) == {r.id};
    assert BeforeOnlyIds([r], {}) == [r.id];
    assert BeforeOnlyIds([r, s], {}) == [r.id];
    assert Occurrences([r], r.id) == 1;
    assert Occurrences([r, s], r.id) == 2;
    assert FirstWith([r, s], r.id) == r;
    assert LastWith([r, s], r.id) == s;
  }

  /** A renamed record is updated and carries its new name. */
  lemma RenamedExample()
    ensures Diff([Record(1, "A", "Alpha")], [Record(1, "A", "Alpha Renamed")])
            == [TableRecord(Record(1, "A", "Alpha Renamed"), Updated)]
  {
  }

  /** A kept, an added and a removed record. */
  lemma MixedExample()
    ensures Diff([Record(1, "A", "Alpha"), Record(2, "B", "Beta")],
                 [Record(2, "B", "Beta"), Record(3, "C", "Gamma")])
            == [TableRecord(Record(2, "B", "Beta"), Unmodified),
                TableRecord(Record(3, "C", "Gamma"), New),
                TableRecord(Record(1, "A", "Alpha"), Deleted)]
  {
    var l1 := [Record(1, "A", "Alpha"), Record(2, "B", "Beta")];
    var l2 := [Record(2, "B", "Beta"), Record(3, "C", "Gamma")];
    assert Unique(l1) && Unique(l2);
    DiffUnique(l1, l2);
    assert l1[..1] == [l1[0]];
    assert l2[..1] == [l2[0]];
    assert [l1[0]][..0] == [];
    assert [l2[0]][..0] == [];
    assert l2[0] in l1;
    assert Absent(l1, Ids(l2)) == [l1[0]];
  }
}
