/** Reordering a user's link field types: two counts guard a loop that writes positions. */
module LinkFieldTypes {
  import opened Wrappers

  datatype Row = Row(user: nat, position: int, deleted: bool)

  type Rows = map<string, Row>

  predicate OwnedBy(rows: Rows, user: nat, id: string) {
    id in rows && rows[id].user == user && !rows[id].deleted
  }

  /** The user's live rows. */
  function Owned(rows: Rows, user: nat): set<string> {
    set id | id in rows && OwnedBy(rows, user, id)
  }

  function Matching(rows: Rows, user: nat, order: seq<string>): set<string> {
    set id | id in rows && OwnedBy(rows, user, id) && id in order
  }

  /** The two counts of the handler. */
  predicate Accepted(rows: Rows, user: nat, order: seq<string>) {
    |Matching(rows, user, order)| == |order| && |Owned(rows, user)| == |order|
  }

  predicate Distinct(order: seq<string>) {
    forall i, j :: 0 <= i < j < |order| ==> order[i] != order[j]
  }

  function Elements(order: seq<string>): set<string> {
    set id | id in order
  }

  function Placed(rows: Rows, user: nat, id: string, position: int): Rows {
    if OwnedBy(rows, user, id) then rows[id := rows[id].(position := position)] else rows
  }

  function AllPlaced(rows: Rows, user: nat, order: seq<string>): Rows {
    if order == [] then rows
    else Placed(AllPlaced(rows, user, order[..|order| - 1]), user, order[|order| - 1], |order| - 1)
  }

  function Reordered(rows: Rows, user: nat, order: seq<string>): Rows {
    if Accepted(rows, user, order) then AllPlaced(rows, user, order) else rows
  }

  // What the counts mean

  lemma ElementsAppend(order: seq<string>, last: string)
    ensures Elements(order + [last]) == Elements(order) + {last}
    ensures Distinct(order + [last]) <==> Distinct(order) && last !in Elements(order)
  {
    var all := order + [last];
    assert forall i :: 0 <= i < |order| ==> all[i] == order[i];
    assert all[|order|] == last;
    if last in Elements(order) {
      var i :| 0 <= i < |order| && order[i] == last;
      assert all[i] == all[|order|];
    }
  }

  /** A list has at most as many elements as entries, and exactly as many only without repeats. */
  lemma {:induction false} ElementsCount(order: seq<string>)
    ensures |Elements(order)| <= |order|
    ensures |Elements(order)| == |order| <==> Distinct(order)
  {
    if order == [] {
      assert Elements(order) == {};
    } else {
      hide Elements, Distinct;
      var n := |order| - 1;
      ElementsCount(order[..n]);
      ElementsAppend(order[..n], order[n]);
      assert order == order[..n] + [order[n]];
      if order[n] in Elements(order[..n]) {
        assert Elements(order[..n]) + {order[n]} == Elements(order[..n]);
      }
    }
  }

  lemma SubsetOfSameSize(a: set<string>, b: set<string>)
    requires a <= b && |a| == |b|
    ensures a == b
  {
    assert |b - a| == |b| - |a| by {
      assert b == a + (b - a);
    }
  }

  lemma SubsetSize(a: set<string>, b: set<string>)
    requires a <= b
    ensures |a| <= |b|
  {
    assert b == a + (b - a);
  }

  /** The counts admit exactly the lists that name each of the user's live rows once and nothing else. */
  lemma TwoCountsForceAPermutation(rows: Rows, user: nat, order: seq<string>)
    ensures Accepted(rows, user, order) <==> Distinct(order) && Elements(order) == Owned(rows, user)
    ensures Accepted(rows, user, order)
            <==> Distinct(order)
                 && forall id :: id in order <==> id in rows && rows[id].user == user && !rows[id].deleted
  {
    hide Distinct;
    var matching, owned := Matching(rows, user, order), Owned(rows, user);
    assert matching == Elements(order) * owned;
    ElementsCount(order);
    if Accepted(rows, user, order) {
      SubsetSize(matching, Elements(order));
      SubsetOfSameSize(matching, Elements(order));
      SubsetOfSameSize(matching, owned);
    }
    if Distinct(order) && Elements(order) == owned {
      assert matching == Elements(order);
    }
    assert forall id :: id in owned <==> id in rows && rows[id].user == user && !rows[id].deleted;
    assert forall id :: id in Elements(order) <==> id in order;
  }

  lemma {:induction false} PlacedInOrder(rows: Rows, user: nat, order: seq<string>)
    requires Distinct(order)
    ensures var after := AllPlaced(rows, user, order);
            && after.Keys == rows.Keys
            && (forall i :: 0 <= i < |order| && OwnedBy(rows, user, order[i]) ==>
                  after[order[i]] == rows[order[i]].(position := i))
            && (forall id :: id in rows && (id !in order || !OwnedBy(rows, user, id)) ==> after[id] == rows[id])
  {
    if order != [] {
      var n := |order| - 1;
      assert forall i :: 0 <= i < n ==> order[..n][i] == order[i];
      PlacedInOrder(rows, user, order[..n]);
      assert order == order[..n] + [order[n]];
      assert order[n] !in order[..n];
    }
  }

  /**
   * An accepted reorder numbers the user's live rows 0 to n - 1 in list order, one row for each number,
   * and touches no other row and no other column; a refused one changes nothing.
   */
  lemma ReorderIsABijection(rows: Rows, user: nat, order: seq<string>)
    ensures var after := Reordered(rows, user, order);
            && after.Keys == rows.Keys
            && (Accepted(rows, user, order) ==>
                  && (forall i :: 0 <= i < |order| ==> OwnedBy(after, user, order[i]) && after[order[i]].position == i)
                  && (forall id :: OwnedBy(after, user, id) ==>
                        exists i :: 0 <= i < |order| && order[i] == id && after[id].position == i))
            && (!Accepted(rows, user, order) ==> after == rows)
            && (forall id :: id in rows ==> after[id] == rows[id].(position := after[id].position))
            && (forall id :: id in rows && !OwnedBy(rows, user, id) ==> after[id] == rows[id])
  {
    if Accepted(rows, user, order) {
      TwoCountsForceAPermutation(rows, user, order);
      PlacedInOrder(rows, user, order);
      hide Accepted, AllPlaced, Distinct;
      var after := Reordered(rows, user, order);
      assert forall i :: 0 <= i < |order| ==> order[i] in Elements(order);
      forall id | OwnedBy(after, user, id)
        ensures exists i :: 0 <= i < |order| && order[i] == id && after[id].position == i
      {
        assert id in Owned(rows, user);
        var i :| 0 <= i < |order| && order[i] == id;
      }
    }
  }

  /** One past the highest position in use, or 0. */
  ghost predicate IsNextPosition(rows: Rows, user: nat, next: int) {
    if Owned(rows, user) == {} then next == 0
    else (exists id :: OwnedBy(rows, user, id) && rows[id].position == next - 1)
         && forall id :: OwnedBy(rows, user, id) ==> rows[id].position < next
  }

  /** So the type created after a reorder goes to the end. */
  lemma NextAfterReorder(rows: Rows, user: nat, order: seq<string>, next: int)
    requires Accepted(rows, user, order)
    ensures IsNextPosition(Reordered(rows, user, order), user, next) <==> next == |order|
  {
    ReorderIsABijection(rows, user, order);
    TwoCountsForceAPermutation(rows, user, order);
    hide Accepted, Reordered, Distinct;
    var after := Reordered(rows, user, order);
    assert forall id :: id in Owned(after, user) ==> OwnedBy(after, user, id);
    if order != [] {
      assert OwnedBy(after, user, order[|order| - 1]);
      assert order[|order| - 1] in Owned(after, user);
    }
  }

  class LinkFieldTypeTable {
    var rows: Rows

    constructor (rows: Rows)
      ensures this.rows == rows
    {
      this.rows := rows;
    }

    /** `ReorderLinkFieldTypes`. */
    method Reorder(user: nat, order: seq<string>) returns (ok: bool)
      modifies this
      ensures ok == Accepted(old(rows), user, order)
      ensures rows == Reordered(old(rows), user, order)
    {
      var total := |Owned(rows, user)|;
      var count := |Matching(rows, user, order)|;
      if count != |order| || total != |order| {
        return false;
      }
      for i := 0 to |order|
        invariant rows == AllPlaced(old(rows), user, order[..i])
      {
        assert order[..i + 1][..i] == order[..i];
        if OwnedBy(rows, user, order[i]) {
          rows := rows[order[i] := rows[order[i]].(position := i)];
        }
      }
      assert order[..|order|] == order;
      return true;
    }

    method NextPosition(user: nat) returns (next: int)
      ensures IsNextPosition(rows, user, next)
    {
      var todo := Owned(rows, user);
      if todo == {} {
        return 0;
      }
      var first :| first in todo;
      var highest := rows[first].position;
      ghost var at := first;
      todo := todo - {first};
      while todo != {}
        invariant OwnedBy(rows, user, at) && rows[at].position == highest
        invariant todo <= Owned(rows, user)
        invariant forall id :: id in Owned(rows, user) && id !in todo ==> rows[id].position <= highest
        decreases |todo|
      {
        var id :| id in todo;
        if rows[id].position > highest {
          highest := rows[id].position;
          at := id;
        }
        todo := todo - {id};
      }
      next := highest + 1;
      assert OwnedBy(rows, user, at);
      forall id | OwnedBy(rows, user, id) ensures rows[id].position < next {
        assert id in Owned(rows, user);
      }
    }
  }
}
