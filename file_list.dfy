/**
 * The list editing the ImageToPdf and PdfMerge tools share: removing the
 * entry at an index (a filter on the position) and moving an entry one
 * place up or down (a swap with its neighbour in a copy of the list).
 */
module FileList {

  /**
   * `list.filter((_, i) => i !== index)`: keeps every entry whose position is
   * not `index`, so an index outside the list removes nothing.
   */
  function RemoveAt<T>(s: seq<T>, index: int): (r: seq<T>)
    ensures 0 <= index < |s| ==> r == s[..index] + s[index + 1..]
    ensures !(0 <= index < |s|) ==> r == s
  {
    if s == [] then []
    else
      var n := |s| - 1;
      assert s == s[..n] + [s[n]];
      RemoveAt(s[..n], index) + (if n != index then [s[n]] else [])
  }

  /**
   * The swap moveFile performs: "up" exchanges the entry with its
   * predecessor when there is one, "down" with its successor when there is
   * one; any other direction, or a move past either end, changes nothing.
   */
  function Move<T>(s: seq<T>, index: nat, direction: string): (r: seq<T>)
    requires index < |s|
    ensures |r| == |s|
    ensures multiset(r) == multiset(s)
    ensures direction == "up" && index > 0 ==>
      r[index - 1] == s[index] && r[index] == s[index - 1]
      && forall j :: 0 <= j < |s| && j != index - 1 && j != index ==> r[j] == s[j]
    ensures direction == "down" && index < |s| - 1 ==>
      r[index + 1] == s[index] && r[index] == s[index + 1]
      && forall j :: 0 <= j < |s| && j != index && j != index + 1 ==> r[j] == s[j]
    ensures !(direction == "up" && index > 0) && !(direction == "down" && index < |s| - 1) ==> r == s
  {
    if direction == "up" && index > 0 then Swap(s, index - 1, index)
    else if direction == "down" && index < |s| - 1 then Swap(s, index + 1, index)
    else s
  }

  /** `[a[i], a[j]] = [a[j], a[i]]` on a list value. */
  function Swap<T>(s: seq<T>, i: nat, j: nat): (r: seq<T>)
    requires i < |s| && j < |s|
    ensures |r| == |s| && r[i] == s[j] && r[j] == s[i]
    ensures forall k :: 0 <= k < |s| && k != i && k != j ==> r[k] == s[k]
    ensures multiset(r) == multiset(s)
  {
    var t := s[i := s[j]];
    assert multiset(t) == multiset(s) - multiset{s[i]} + multiset{s[j]};
    assert t[j] == (if i == j then s[j] else s[j]);
    assert multiset(t[j := s[i]]) == multiset(t) - multiset{t[j]} + multiset{s[i]};
    t[j := s[i]]
  }

  /** The pointwise image of a list, as `list.map(f)` builds it. */
  // Its ensures only expose the definition to callers; RemoveAtMap and MoveMap state what it is used for.
  function MapSeq<A, B>(f: A -> B, s: seq<A>): (r: seq<B>)
    ensures |r| == |s|
    ensures forall i :: 0 <= i < |s| ==> r[i] == f(s[i])
  {
    seq(|s|, i requires 0 <= i < |s| => f(s[i]))
  }

  /**
   * moveFile on a copy of the list: swap in place, as the destructuring
   * assignment does.
   */
  method MoveInPlace<T>(a: array<T>, index: nat, direction: string)
    requires index < a.Length
    modifies a
    ensures a[..] == Move(old(a[..]), index, direction)
  {
    if direction == "up" && index > 0 {
      a[index - 1], a[index] := a[index], a[index - 1];
    } else if direction == "down" && index < a.Length - 1 {
      a[index + 1], a[index] := a[index], a[index + 1];
    }
  }

  /** A copy of the list in a fresh array, moved, and read back. */
  method MoveCopy<T>(s: seq<T>, index: nat, direction: string) returns (r: seq<T>)
    requires index < |s|
    ensures r == Move(s, index, direction)
  {
    var copy := new T[|s|](i requires 0 <= i < |s| => s[i]);
    assert copy[..] == s;
    MoveInPlace(copy, index, direction);
    r := copy[..];
  }

  // ---------------------------------------------------------------------------
  // Properties

  /** Removal loses exactly the removed entry and nothing else. */
  lemma RemoveAtMultiset<T>(s: seq<T>, index: int)
    requires 0 <= index < |s|
    ensures |RemoveAt(s, index)| == |s| - 1
    ensures multiset(RemoveAt(s, index)) + multiset{s[index]} == multiset(s)
  {
    var r := RemoveAt(s, index);
    assert r == s[..index] + s[index + 1..];
    MultisetWithout(s, index);
  }

  lemma MultisetWithout<T>(s: seq<T>, i: nat)
    requires i < |s|
    ensures multiset(s[..i] + s[i + 1..]) + multiset{s[i]} == multiset(s)
  {
    var before, after := s[..i], s[i + 1..];
    assert s == before + ([s[i]] + after);
    assert multiset(s) == multiset(before) + (multiset{s[i]} + multiset(after));
  }

  /** Entries before the removed one keep their positions; entries after it move up by one. */
  lemma RemoveAtPositions<T>(s: seq<T>, index: int)
    requires 0 <= index < |s|
    ensures forall j :: 0 <= j < index ==> RemoveAt(s, index)[j] == s[j]
    ensures forall j :: index < j < |s| ==> RemoveAt(s, index)[j - 1] == s[j]
  {
  }

  /** Moving an entry up and then moving it back down restores the list, and conversely. */
  lemma MoveUpThenDown<T>(s: seq<T>, index: nat)
    requires 0 < index < |s|
    ensures Move(Move(s, index, "up"), index - 1, "down") == s
    ensures Move(Move(s, index - 1, "down"), index, "up") == s
  {
    SwapTwice(s, index - 1, index);
    SwapTwice(s, index, index - 1);
  }

  lemma SwapTwice<T>(s: seq<T>, i: nat, j: nat)
    requires i < |s| && j < |s|
    ensures Swap(Swap(s, i, j), j, i) == s
  {
    var t := Swap(Swap(s, i, j), j, i);
    assert forall k :: 0 <= k < |s| ==> t[k] == s[k];
  }

  /** Removing from a mapped list is mapping the list with the entry removed. */
  lemma RemoveAtMap<A, B>(f: A -> B, s: seq<A>, index: int)
    ensures RemoveAt(MapSeq(f, s), index) == MapSeq(f, RemoveAt(s, index))
  {
  }

  /** A move applied to a mapped list is the mapped list of the move, so lists kept in lockstep stay in lockstep. */
  lemma MoveMap<A, B>(f: A -> B, s: seq<A>, index: nat, direction: string)
    requires index < |s|
    ensures Move(MapSeq(f, s), index, direction) == MapSeq(f, Move(s, index, direction))
  {
  }
}
