/** Where parsed rows are kept: a linked list that grows at its tail, or a preallocated array. Both hold the same
    sequence of rows. */
module JsonStore {
  import opened Options
  import opened JsonRows

  class ListItem<T> {
    var dataItem: Row<T>
    var nextItem: ListItem?<T>

    constructor (row: Row<T>)
      ensures dataItem == row && nextItem == null
    {
      dataItem := row;
      nextItem := null;
    }
  }

  /** The sum of the rows' distances in the order of the rows. */
  function LeftFold<T, R>(rows: seq<Row<T>>, distance: Row<T> -> R, add: (R, R) -> R, zero: R): R {
    if rows == [] then zero
    else add(LeftFold(rows[..|rows| - 1], distance, add, zero), distance(rows[|rows| - 1]))
  }

  lemma FoldStep<T, R>(rows: seq<Row<T>>, i: nat, distance: Row<T> -> R, add: (R, R) -> R, zero: R)
    requires i < |rows|
    ensures LeftFold(rows[..i + 1], distance, add, zero)
            == add(LeftFold(rows[..i], distance, add, zero), distance(rows[i]))
  {
    assert rows[..i + 1][..i] == rows[..i];
  }

  /** A 32-bit counter after one more increment. */
  function Incremented(count: nat): nat {
    (count + 1) % 0x1_0000_0000
  }

  lemma CountStep(i: nat)
    ensures Incremented(i % 0x1_0000_0000) == (i + 1) % 0x1_0000_0000
  {
  }

  datatype Totals<R> = Totals(sum: R, count: nat, average: R)

  ghost predicate Extends<T>(before: seq<T>, after: seq<T>) {
    |before| <= |after| && forall k :: 0 <= k < |before| ==> after[k] == before[k]
  }

  class Storage<T> {
    const preallocated: bool
    const dataArray: array<Row<T>>
    var listHead: ListItem?<T>
    var listTail: ListItem?<T>
    var dataItemCount: nat
    ghost var nodes: seq<ListItem<T>>

    /** The nodes are chained in order from head to tail. */
    ghost predicate Linked()
      reads this, nodes
    {
      && listHead == (if nodes == [] then null else nodes[0])
      && listTail == (if nodes == [] then null else nodes[|nodes| - 1])
      && (nodes != [] ==> nodes[|nodes| - 1].nextItem == null)
      && forall k :: 0 <= k < |nodes| - 1 ==> nodes[k].nextItem == nodes[k + 1]
    }

    ghost predicate Valid()
      reads this, nodes, dataArray
    {
      Linked() && if preallocated then nodes == [] && dataItemCount <= dataArray.Length else dataItemCount == |nodes|
    }

    /** The stored rows. */
    ghost function Contents(): (rows: seq<Row<T>>)
      requires Valid()
      reads this, nodes, dataArray
      ensures |rows| == dataItemCount
    {
      if preallocated then dataArray[..dataItemCount]
      else seq(|nodes|, k requires 0 <= k < |nodes| reads this, nodes => nodes[k].dataItem)
    }

    /** Room for `capacity` rows in an array, or an empty list; memory starts with arbitrary rows. */
    constructor (preallocate: bool, capacity: nat, filler: Row<T>)
      ensures Valid() && Contents() == [] && fresh(dataArray) && nodes == []
      ensures preallocated == preallocate && dataArray.Length == capacity
    {
      preallocated := preallocate;
      dataArray := new Row<T>[capacity](_ => filler);
      listHead := null;
      listTail := null;
      dataItemCount := 0;
      nodes := [];
    }

    /** The list has no cycle: its nodes are pairwise different. */
    lemma {:induction false} Acyclic(j: nat, k: nat)
      requires Linked() && j < k < |nodes|
      ensures nodes[j] != nodes[k]
      decreases |nodes| - k
    {
      assert nodes[j].nextItem == nodes[j + 1];
      if k + 1 < |nodes| {
        Acyclic(j + 1, k + 1);
        assert nodes[k].nextItem == nodes[k + 1];
      } else {
        assert nodes[k].nextItem == null;
      }
    }

    /** Adds a row; refuses when the array is full. */
    method Append(row: Row<T>) returns (ok: bool)
      requires Valid()
      modifies this, dataArray, nodes
      ensures Valid() && Extends(old(nodes), nodes)
      ensures forall k :: |old(nodes)| <= k < |nodes| ==> fresh(nodes[k])
      ensures ok <==> !preallocated || old(dataItemCount) < dataArray.Length
      ensures Contents() == if ok then old(Contents()) + [row] else old(Contents())
    {
      if preallocated {
        ok := dataItemCount < dataArray.Length;
        if ok {
          dataArray[dataItemCount] := row;
          dataItemCount := dataItemCount + 1;
        }
      } else {
        ok := true;
        var item := new ListItem<T>(row);
        if listHead == null {
          listHead := item;
          listTail := item;
        } else {
          ghost var last := |nodes| - 1;
          forall k | 0 <= k < last
            ensures nodes[k] != nodes[last]
          {
            Acyclic(k, last);
          }
          listTail.nextItem := item;
          listTail := item;
        }
        nodes := nodes + [item];
        dataItemCount := dataItemCount + 1;
      }
    }

    /** The averaging pass: both forms of storage give the same left fold, count and quotient. An empty list is an
        error, an empty array is not. */
    method CalculateAverage<R>(distance: Row<T> -> R, add: (R, R) -> R, divide: (R, nat) -> R, zero: R)
      returns (totals: Option<Totals<R>>)
      requires Valid()
      ensures totals.None? <==> !preallocated && Contents() == []
      ensures totals.Some? ==>
                var sum, count := LeftFold(Contents(), distance, add, zero), |Contents()| % 0x1_0000_0000;
                totals.value == Totals(sum, count, divide(sum, count))
    {
      var sum, count := zero, 0;
      ghost var rows := Contents();
      if preallocated {
        for i := 0 to dataItemCount
          invariant sum == LeftFold(rows[..i], distance, add, zero) && count == i % 0x1_0000_0000
        {
          FoldStep(rows, i, distance, add, zero);
          CountStep(i);
          sum := add(sum, distance(dataArray[i]));
          count := Incremented(count);
        }
        assert rows[..|rows|] == rows;
      } else {
        if listHead == null || listTail == null {
          return None;
        }
        var item := listHead;
        ghost var i := 0;
        while item != null
          invariant 0 <= i <= |nodes| && item == if i < |nodes| then nodes[i] else null
          invariant sum == LeftFold(rows[..i], distance, add, zero) && count == i % 0x1_0000_0000
          decreases |nodes| - i
        {
          FoldStep(rows, i, distance, add, zero);
          CountStep(i);
          sum := add(sum, distance(item.dataItem));
          count := Incremented(count);
          item := item.nextItem;
          i := i + 1;
        }
        assert rows[..|rows|] == rows;
      }
      totals := Some(Totals(sum, count, divide(sum, count)));
    }
  }
}
