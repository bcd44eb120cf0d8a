/**
  Tables as the data-preparation code sees them: an ordered list of column
  names and an ordered list of rows.  Every row keeps its index label (the
  pandas row label, which slicing and column projection carry along) and one
  cell per column, aligned with the column list by position.

  Column names may repeat, as they may in a pandas frame; dropping a name
  removes every column of that name and selecting it keeps every one of them.
  Both are the same positional filter, `Pick`, applied once to the column
  names and once to the cells of each row.
 */
module Frame {

  /** Failures the core raises. */
  datatype Error =
    | MissingColumn(name: string)   // pandas KeyError: a named column is not in the frame
    | AssertionFailed               // Python AssertionError from a bare `assert`

  datatype Result<+T> = Ok(value: T) | Err(error: Error)

  datatype Row<V> = Row(index: int, cells: seq<V>)

  datatype Table<V> = Table(columns: seq<string>, rows: seq<Row<V>>)

  /** A frame is rectangular: every row has exactly one cell per column. */
  predicate WellFormed<V>(t: Table<V>) {
    forall i :: 0 <= i < |t.rows| ==> |t.rows[i].cells| == |t.columns|
  }

  /** How many columns carry the name `target`. */
  function Occurrences(names: seq<string>, target: string): (k: nat)
    ensures k <= |names|
    ensures k == 0 <==> target !in names
  {
    if names == [] then 0
    else (if names[0] == target then 1 else 0) + Occurrences(names[1..], target)
  }

  /**
    The elements of `xs` whose aligned name is `target` (when `matching`) or
    is not `target` (otherwise), in their original order.
   */
  function Pick<T>(names: seq<string>, xs: seq<T>, target: string, matching: bool): (r: seq<T>)
    requires |xs| == |names|
    ensures |r| == if matching then Occurrences(names, target) else |names| - Occurrences(names, target)
  {
    if names == [] then []
    else if (names[0] == target) == matching then [xs[0]] + Pick(names[1..], xs[1..], target, matching)
    else Pick(names[1..], xs[1..], target, matching)
  }

  /**
    Re-interleaves the two halves of a `Pick`: positions named `target` are
    taken in order from `picked`, all others in order from `kept`.
   */
  function Merge<T>(names: seq<string>, kept: seq<T>, picked: seq<T>, target: string): (r: seq<T>)
    requires |kept| == |names| - Occurrences(names, target)
    requires |picked| == Occurrences(names, target)
    ensures |r| == |names|
  {
    if names == [] then []
    else if names[0] == target then [picked[0]] + Merge(names[1..], kept, picked[1..], target)
    else [kept[0]] + Merge(names[1..], kept[1..], picked, target)
  }

  /** Splitting a sequence by name and merging the halves back gives the sequence back. */
  lemma {:induction false} MergePick<T>(names: seq<string>, xs: seq<T>, target: string)
    requires |xs| == |names|
    ensures Merge(names, Pick(names, xs, target, false), Pick(names, xs, target, true), target) == xs
  {
    if names != [] {
      MergePick(names[1..], xs[1..], target);
      var kept, picked := Pick(names, xs, target, false), Pick(names, xs, target, true);
      if names[0] == target {
        assert picked == [xs[0]] + Pick(names[1..], xs[1..], target, true);
        assert picked[1..] == Pick(names[1..], xs[1..], target, true);
      } else {
        assert kept == [xs[0]] + Pick(names[1..], xs[1..], target, false);
        assert kept[1..] == Pick(names[1..], xs[1..], target, false);
      }
      assert xs == [xs[0]] + xs[1..];
    }
  }

  /** The names left after dropping `target` are exactly the other names of the list. */
  lemma {:induction false} PickOthersMembers(names: seq<string>, target: string)
    ensures forall c :: c in Pick(names, names, target, false) <==> c in names && c != target
  {
    if names != [] {
      PickOthersMembers(names[1..], target);
      assert names == [names[0]] + names[1..];
    }
  }

  /** Every name selected by `target` is `target`. */
  lemma {:induction false} PickTargetMembers(names: seq<string>, target: string)
    ensures forall c :: c in Pick(names, names, target, true) ==> c == target
  {
    if names != [] {
      PickTargetMembers(names[1..], target);
    }
  }

  /** With a single column named `target`, selecting it yields exactly that column. */
  lemma PickUniqueTarget(names: seq<string>, target: string)
    requires Occurrences(names, target) == 1
    ensures Pick(names, names, target, true) == [target]
  {
    PickTargetMembers(names, target);
    var p := Pick(names, names, target, true);
    assert p[0] in p;
  }

  /**
    With a single column named `target`, at position `pos`, dropping it removes
    exactly that position: the other elements keep their order on both sides.
   */
  lemma {:induction false} PickOthersAround<T>(names: seq<string>, xs: seq<T>, target: string, pos: nat)
    requires |xs| == |names| && pos < |names|
    requires names[pos] == target && Occurrences(names, target) == 1
    ensures Pick(names, xs, target, false) == xs[..pos] + xs[pos + 1..]
    ensures Pick(names, xs, target, true) == [xs[pos]]
  {
    if pos == 0 {
      assert target !in names[1..];
      PickNoneMatch(names[1..], xs[1..], target);
    } else {
      assert names[0] != target;
      PickOthersAround(names[1..], xs[1..], target, pos - 1);
      assert xs[..pos] == [xs[0]] + xs[1..][..pos - 1];
      assert xs[pos + 1..] == xs[1..][pos..];
    }
  }

  /** When no name is `target`, dropping keeps everything and selecting keeps nothing. */
  lemma {:induction false} PickNoneMatch<T>(names: seq<string>, xs: seq<T>, target: string)
    requires |xs| == |names| && target !in names
    ensures Pick(names, xs, target, false) == xs
    ensures Pick(names, xs, target, true) == []
  {
    if names != [] {
      PickNoneMatch(names[1..], xs[1..], target);
      assert xs == [xs[0]] + xs[1..];
    }
  }
}
