/**
 * The bounded undo history of the radial tree
 * (src/components/RadialTree/utils/Stack.js, class Stack).
 *
 * The top of the stack is the head of the linked list. A push that makes
 * the list longer than `maxStep` drops the oldest entry, the list's tail.
 * The meaning of the operations is given on plain sequences (`Pushed`,
 * `Top`, `Popped`, `PushAll`); the class is proved against them.
 */
module HistoryStack {
  import opened Wrappers
  import opened LinkedLists

  /** The capacity a stack gets when none is given. */
  const DefaultMaxStep: int := 10

  function Min(a: int, b: int): int
  {
    if a <= b then a else b
  }

  function Max(a: int, b: int): int
  {
    if a <= b then b else a
  }

  /**
   * The history after pushing `v` onto `s`, most recent first: `v` goes in
   * front, and if that makes more than `maxStep` entries the last one goes.
   */
  function Pushed<T>(s: seq<T>, v: T, maxStep: int): seq<T>
  {
    var t := [v] + s;
    if |t| > maxStep then t[..|t| - 1] else t
  }

  /** The entry `peek` and `pop` report, if any. */
  function Top<T>(s: seq<T>): Option<T>
  {
    if s == [] then None else Some(s[0])
  }

  /** The history after a pop. */
  function Popped<T>(s: seq<T>): seq<T>
  {
    if s == [] then [] else s[1..]
  }

  /** Pushing the values of `vs` one after the other, first to last. */
  function PushAll<T>(s: seq<T>, vs: seq<T>, maxStep: int): seq<T>
    decreases |vs|
  {
    if vs == [] then s else PushAll(Pushed(s, vs[0], maxStep), vs[1..], maxStep)
  }

  function Reverse<T>(s: seq<T>): (r: seq<T>)
    ensures |r| == |s|
    ensures forall i :: 0 <= i < |s| ==> r[i] == s[|s| - 1 - i]
  {
    if s == [] then [] else Reverse(s[1..]) + [s[0]]
  }

  /** While there is room, a push only puts the value in front. */
  lemma PushedBelowCapacity<T>(s: seq<T>, v: T, maxStep: int)
    requires |s| < maxStep
    ensures Pushed(s, v, maxStep) == [v] + s
  {
  }

  /** A push onto a history already holding `maxStep` entries or more forgets the oldest one. */
  lemma PushedAtCapacity<T>(s: seq<T>, v: T, maxStep: int)
    requires s != [] && |s| >= maxStep
    ensures Pushed(s, v, maxStep) == [v] + s[..|s| - 1]
  {
    assert ([v] + s)[..|s|] == [v] + s[..|s| - 1];
  }

  /** A history within its capacity stays within it. */
  lemma PushedBound<T>(s: seq<T>, v: T, maxStep: int)
    ensures |s| <= maxStep ==> |Pushed(s, v, maxStep)| <= maxStep
    ensures |Pushed(s, v, maxStep)| == Min(|s| + 1, Max(maxStep, |s|))
  {
  }

  /** With room for at least one entry, the value pushed is the one peek and pop see. */
  lemma PushThenPop<T>(s: seq<T>, v: T, maxStep: int)
    requires maxStep >= 1
    ensures Top(Pushed(s, v, maxStep)) == Some(v)
    ensures Popped(Pushed(s, v, maxStep)) == if |s| < maxStep then s else s[..|s| - 1]
  {
    if |s| >= maxStep {
      PushedAtCapacity(s, v, maxStep);
    }
  }

  /**
   * Starting within capacity, a run of pushes leaves the most recent
   * `maxStep` entries, newest first: the history is the newest prefix of
   * the pushed values in reverse followed by the old history.
   */
  lemma {:induction false} PushAllKeepsNewest<T>(s: seq<T>, vs: seq<T>, maxStep: int)
    requires |s| <= Max(maxStep, 0)
    ensures PushAll(s, vs, maxStep) == (Reverse(vs) + s)[..Min(|vs| + |s|, Max(maxStep, 0))]
    decreases |vs|
  {
    if vs != [] {
      var m := Max(maxStep, 0);
      var p := Pushed(s, vs[0], maxStep);
      assert p == ([vs[0]] + s)[..Min(|s| + 1, m)];
      PushAllKeepsNewest(p, vs[1..], maxStep);
      var r := Reverse(vs[1..]);
      assert Reverse(vs) == r + [vs[0]];
      var k := Min(|vs| + |s|, m);
      var lhs := (r + p)[..Min(|vs[1..]| + |p|, m)];
      var rhs := (Reverse(vs) + s)[..k];
      assert |lhs| == k;
      forall i | 0 <= i < k ensures lhs[i] == rhs[i] {
        if i < |r| {
          assert lhs[i] == r[i] == rhs[i];
        } else {
          assert lhs[i] == p[i - |r|] == ([vs[0]] + s)[i - |r|];
          assert rhs[i] == (r + ([vs[0]] + s))[i];
        }
      }
      assert lhs == rhs;
    }
  }

  class Stack<T(==)> {
    const linkedList: LinkedList<T>
    const maxStep: int
    ghost var Repr: set<object>

    ghost predicate Valid()
      reads this, Repr
      ensures Valid() ==> this in Repr
    {
      && this in Repr
      && linkedList in Repr
      && Repr == {this} + linkedList.Repr
      && this !in linkedList.Repr
      && linkedList.Valid()
    }

    /** The entries, most recent first. */
    ghost function Contents(): seq<T>
      reads this, linkedList
    {
      linkedList.Contents()
    }

    /** A new, empty history holding at most `maxStep` entries. */
    constructor (maxStep: int)
      ensures Valid() && fresh(Repr)
      ensures Contents() == [] && this.maxStep == maxStep
    {
      linkedList := new LinkedList();
      this.maxStep := maxStep;
      new;
      Repr := {this} + linkedList.Repr;
    }

    /** A new, empty history with the default capacity. */
    constructor Default()
      ensures Valid() && fresh(Repr)
      ensures Contents() == [] && maxStep == DefaultMaxStep
    {
      linkedList := new LinkedList();
      maxStep := DefaultMaxStep;
      new;
      Repr := {this} + linkedList.Repr;
    }

    /** The number of entries, counted by walking the list. */
    method Length() returns (n: nat)
      requires Valid()
      ensures n == |Contents()|
    {
      var nodes := linkedList.ToArray();
      n := |nodes|;
    }

    /** The stack is empty exactly when the list has no head. */
    predicate IsEmpty()
      requires Valid()
      reads Repr
      ensures IsEmpty() <==> Contents() == []
    {
      linkedList.head == null
    }

    /** The most recent entry, without removing it. */
    function Peek(): (r: Option<T>)
      requires Valid()
      reads Repr
      ensures r == Top(Contents())
    {
      if IsEmpty() then None else Some(linkedList.head.value)
    }

    /** Records `value`; drops the oldest entry when that exceeds `maxStep`. */
    method Push(value: T)
      requires Valid()
      modifies Repr
      ensures Valid() && fresh(Repr - old(Repr))
      ensures Contents() == Pushed(old(Contents()), value, maxStep)
    {
      linkedList.Prepend(value);
      Repr := {this} + linkedList.Repr;
      var n := Length();
      if n > maxStep {
        DropOldest();
      }
    }

    /** The `deleteTail` step of `Push`: forgets the oldest entry. */
    method DropOldest()
      requires Valid() && Contents() != []
      modifies Repr
      ensures Valid() && Repr <= old(Repr)
      ensures Contents() == old(Contents())[..|old(Contents())| - 1]
    {
      var _ := linkedList.DeleteTail();
      Repr := {this} + linkedList.Repr;
    }

    /** Removes the most recent entry and returns it, or None when empty. */
    method Pop() returns (r: Option<T>)
      requires Valid()
      modifies Repr
      ensures Valid() && Repr <= old(Repr)
      ensures r == Top(old(Contents()))
      ensures Contents() == Popped(old(Contents()))
    {
      var removed := linkedList.DeleteHead();
      Repr := {this} + linkedList.Repr;
      r := if removed != null then Some(removed.value) else None;
    }

    /** The entries, most recent first. */
    method ToArray() returns (values: seq<T>)
      requires Valid()
      ensures values == Contents()
    {
      var nodes := linkedList.ToArray();
      values := Values(nodes);
    }

    /** Pops until the stack is empty. */
    method Clear()
      requires Valid()
      modifies Repr
      ensures Valid() && Repr <= old(Repr)
      ensures Contents() == []
    {
      while !IsEmpty()
        invariant Valid() && Repr <= old(Repr)
        decreases |Contents()|
      {
        var _ := Pop();
      }
    }
  }
}
