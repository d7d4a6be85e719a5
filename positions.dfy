/**
 * The order on positions (Position::operator<) and the two sorts the core
 * runs over position lists: forward_list::sort in the FormulaAST constructor
 * and std::sort in Formula::GetReferencedCells.
 */
module PositionOrder {
  import opened Common

  predicate LessEq(a: Position, b: Position)
  {
    !Less(b, a)
  }

  /** Non-decreasing; duplicates allowed. */
  predicate Sorted(s: seq<Position>)
  {
    forall i, j :: 0 <= i < j < |s| ==> LessEq(s[i], s[j])
  }

  /** Strictly ascending, hence duplicate-free. */
  predicate StrictlySorted(s: seq<Position>)
  {
    forall i, j :: 0 <= i < j < |s| ==> Less(s[i], s[j])
  }

  function Elements(s: seq<Position>): set<Position>
  {
    set x | x in s
  }

  /** Inserts x in front of the first element that is not less than it. */
  function Insert(x: Position, s: seq<Position>): (r: seq<Position>)
    requires Sorted(s)
    ensures Sorted(r)
    ensures multiset(r) == multiset(s) + multiset{x}
  {
    if s == [] || LessEq(x, s[0]) then [x] + s
    else
      var rest := Insert(x, s[1..]);
      InsertBehindHead(x, s, rest);
      [s[0]] + rest
  }

  /** Keeping a head that is below x in front of the insertion into the tail. */
  lemma InsertBehindHead(x: Position, s: seq<Position>, rest: seq<Position>)
    requires Sorted(s) && s != [] && Less(s[0], x)
    requires Sorted(rest) && multiset(rest) == multiset(s[1..]) + multiset{x}
    ensures Sorted([s[0]] + rest)
    ensures multiset([s[0]] + rest) == multiset(s) + multiset{x}
  {
    assert s == [s[0]] + s[1..];
    forall k | 0 <= k < |rest| ensures LessEq(s[0], rest[k]) {
      assert rest[k] in multiset(rest);
      assert rest[k] == x || rest[k] in multiset(s[1..]);
      if rest[k] != x {
        var j :| 0 <= j < |s[1..]| && s[1..][j] == rest[k];
        assert s[j + 1] == rest[k];
      }
    }
  }

  /** A sorted permutation of s (insertion sort). */
  function SortPositions(s: seq<Position>): (r: seq<Position>)
    ensures Sorted(r)
    ensures multiset(r) == multiset(s)
  {
    if s == [] then []
    else
      assert s == [s[0]] + s[1..];
      Insert(s[0], SortPositions(s[1..]))
  }

  /** Two sorted permutations of one multiset are the same sequence. */
  lemma {:induction false} SortedUnique(a: seq<Position>, b: seq<Position>)
    requires Sorted(a) && Sorted(b)
    requires multiset(a) == multiset(b)
    ensures a == b
  {
    if a != [] {
      assert |b| == |multiset(b)| == |a| > 0;
      SortedHeads(a, b);
      DropHead(a);
      DropHead(b);
      SortedUnique(a[1..], b[1..]);
    }
  }

  /** Sorted permutations of one multiset start with the same element, its least. */
  lemma SortedHeads(a: seq<Position>, b: seq<Position>)
    requires Sorted(a) && Sorted(b) && a != [] && b != []
    requires multiset(a) == multiset(b)
    ensures a[0] == b[0]
  {
    assert a[0] in multiset(b) && b[0] in multiset(a);
    var i :| 0 <= i < |b| && b[i] == a[0];
    var j :| 0 <= j < |a| && a[j] == b[0];
    assert LessEq(b[0], a[0]) && LessEq(a[0], b[0]);
  }

  /** Dropping the head of a sorted sequence leaves it sorted, one occurrence fewer. */
  lemma DropHead(a: seq<Position>)
    requires Sorted(a) && a != []
    ensures Sorted(a[1..])
    ensures multiset(a[1..]) == multiset(a) - multiset{a[0]}
  {
    assert a == [a[0]] + a[1..];
  }

  /** Drops repeated neighbours of a sorted sequence. */
  function Dedup(s: seq<Position>): (r: seq<Position>)
    requires Sorted(s)
    ensures StrictlySorted(r)
    ensures Elements(r) == Elements(s)
  {
    if |s| <= 1 then s
    else if s[0] == s[1] then
      var r := Dedup(s[1..]);
      assert Elements(s) == Elements(s[1..]) by {
        assert s == [s[0]] + s[1..];
      }
      r
    else
      var rest := Dedup(s[1..]);
      assert s == [s[0]] + s[1..];
      assert Elements(s) == {s[0]} + Elements(s[1..]);
      assert Elements([s[0]] + rest) == {s[0]} + Elements(rest);
      assert forall k :: 0 <= k < |rest| ==> Less(s[0], rest[k]) by {
        forall k | 0 <= k < |rest| ensures Less(s[0], rest[k]) {
          assert rest[k] in Elements(s[1..]);
        }
      }
      [s[0]] + rest
  }

  /** The head of a strictly ascending sequence is below every other element. */
  lemma StrictHead(a: seq<Position>, x: Position)
    requires StrictlySorted(a) && x in Elements(a)
    ensures LessEq(a[0], x)
    ensures x != a[0] ==> x in Elements(a[1..])
  {
    var j :| 0 <= j < |a| && a[j] == x;
    if j > 0 {
      assert Less(a[0], a[j]);
      assert a[1..][j - 1] == x;
    }
  }

  /** Two strictly ascending sequences with the same elements are equal. */
  lemma {:induction false} StrictlySortedUnique(a: seq<Position>, b: seq<Position>)
    requires StrictlySorted(a) && StrictlySorted(b)
    requires Elements(a) == Elements(b)
    ensures a == b
  {
    if a != [] || b != [] {
      assert a != [] && b != [] by {
        if a != [] { assert a[0] in Elements(b); }
        if b != [] { assert b[0] in Elements(a); }
      }
      assert a[0] in Elements(b) && b[0] in Elements(a);
      StrictHead(a, b[0]);
      StrictHead(b, a[0]);
      assert a[0] == b[0];
      assert Elements(a[1..]) == Elements(b[1..]) by {
        forall x | x in Elements(a[1..]) ensures x in Elements(b[1..]) {
          var k :| 0 <= k < |a[1..]| && a[1..][k] == x;
          assert Less(a[0], a[k + 1]);
          StrictHead(b, x);
        }
        forall x | x in Elements(b[1..]) ensures x in Elements(a[1..]) {
          var k :| 0 <= k < |b[1..]| && b[1..][k] == x;
          assert Less(b[0], b[k + 1]);
          StrictHead(a, x);
        }
      }
      StrictlySortedUnique(a[1..], b[1..]);
    }
  }

  /** std::sort on a vector of positions, as an in-place insertion sort. */
  method SortInPlace(a: array<Position>)
    modifies a
    ensures Sorted(a[..])
    ensures multiset(a[..]) == multiset(old(a[..]))
  {
    var i := 0;
    while i < a.Length
      invariant 0 <= i <= a.Length
      invariant forall x, y :: 0 <= x < y < i ==> LessEq(a[x], a[y])
      invariant multiset(a[..]) == multiset(old(a[..]))
    {
      var j := i;
      while j > 0 && Less(a[j], a[j - 1])
        invariant 0 <= j <= i
        invariant forall x, y :: 0 <= x < y <= i && x != j && y != j ==> LessEq(a[x], a[y])
        invariant forall y :: j < y <= i ==> LessEq(a[j], a[y])
        invariant multiset(a[..]) == multiset(old(a[..]))
      {
        a[j], a[j - 1] := a[j - 1], a[j];
        j := j - 1;
      }
      i := i + 1;
    }
  }
}
